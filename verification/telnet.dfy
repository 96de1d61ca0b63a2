/** Telnet option handling (services/telnet/protocol.py, after RFC 854). */
module Telnet {
  import opened Bytes

  const IAC: byte := 0xFF
  const DONT: byte := 0xFE
  const DO: byte := 0xFD
  const WONT: byte := 0xFC
  const WILL: byte := 0xFB
  const SB: byte := 0xFA
  const SE: byte := 0xF0

  // ---- specification -------------------------------------------------------

  /** The refusal of one option request; WONT and DONT need none. */
  function Refusal(verb: byte, opt: byte): bytes {
    if verb == WILL then [IAC, DONT, opt] else if verb == DO then [IAC, WONT, opt] else []
  }

  function Refusals(data: bytes): bytes
    decreases |data|
  {
    if data == [] then []
    else if data[0] == IAC && |data| > 2 then Refusal(data[1], data[2]) + Refusals(data[3..])
    else Refusals(data[1..])
  }

  /** What follows the first SE. */
  function AfterSe(data: bytes): (rest: bytes)
    ensures |rest| <= |data|
  {
    if data == [] then [] else if data[0] == SE then data[1..] else AfterSe(data[1..])
  }

  /** What follows the command that `data` starts with. */
  function AfterCommand(data: bytes): (rest: bytes)
    requires |data| > 1
    ensures |rest| < |data|
  {
    if data[1] == SB then AfterSe(data[2..])
    else if data[1] in {DO, DONT, WILL, WONT} then (if |data| > 3 then data[3..] else [])
    else data[2..]
  }

  function Stripped(data: bytes): bytes
    decreases |data|
  {
    if data == [] then []
    else if data[0] == IAC && |data| > 1 then Stripped(AfterCommand(data))
    else [data[0]] + Stripped(data[1..])
  }

  // ---- the scanners as written -------------------------------------------------

  method RefuseOptions(data: bytes) returns (reply: bytes)
    ensures reply == Refusals(data)
  {
    hide Refusals;
    reply := [];
    var i, n := 0, |data|;
    while i < n
      invariant 0 <= i <= n && reply + Refusals(data[i..]) == Refusals(data)
      decreases n - i
    {
      RefusalsStep(reply, data, i);
      if data[i] == IAC && i + 2 < n {
        var verb, opt := data[i + 1], data[i + 2];
        if verb == WILL {
          reply := reply + [IAC, DONT, opt];
        } else if verb == DO {
          reply := reply + [IAC, WONT, opt];
        }
        i := i + 3;
      } else {
        i := i + 1;
      }
    }
    NoRefusals(data);
  }

  lemma RefusalsFrom(data: bytes, i: nat)
    requires i < |data|
    ensures Refusals(data[i..]) ==
      if data[i] == IAC && i + 2 < |data| then Refusal(data[i + 1], data[i + 2]) + Refusals(data[i + 3..])
      else Refusals(data[i + 1..])
  {
    assert data[i..][1..] == data[i + 1..];
    if i + 2 < |data| {
      assert data[i..][3..] == data[i + 3..];
    }
  }

  lemma RefusalsStep(reply: bytes, data: bytes, i: nat)
    requires i < |data|
    ensures reply + Refusals(data[i..]) ==
      if data[i] != IAC || i + 2 >= |data| then reply + Refusals(data[i + 1..])
      else if data[i + 1] == WILL then (reply + [IAC, DONT, data[i + 2]]) + Refusals(data[i + 3..])
      else if data[i + 1] == DO then (reply + [IAC, WONT, data[i + 2]]) + Refusals(data[i + 3..])
      else reply + Refusals(data[i + 3..])
  {
    hide Refusals;
    RefusalsFrom(data, i);
  }

  lemma NoRefusals(data: bytes)
    ensures Refusals(data[|data|..]) == []
  {
  }

  /** `data[i:]`, also behind the end. */
  function Rest(data: bytes, i: nat): (r: bytes)
    ensures i < |data| ==> |r| == |data| - i > 0 && r[0] == data[i]
  {
    if i < |data| then data[i..] else []
  }

  method StripIac(data: bytes) returns (out: bytes)
    ensures out == Stripped(data)
  {
    hide AfterCommand, Rest, Stripped;
    out := [];
    var i, n := 0, |data|;
    WholeRest(data);
    while i < n
      invariant 0 <= i
      invariant out + Stripped(Rest(data, i)) == Stripped(data)
      decreases n - i
    {
      var b := data[i];
      if b == IAC && i + 1 < n {
        StripSkips(data, i);
        i := SkipCommand(data, i);
      } else {
        StripKeeps(data, i);
        out := out + [b];
        i := i + 1;
      }
    }
    NoRest(data, i);
  }

  lemma StripSkips(data: bytes, i: nat)
    requires i + 1 < |data| && data[i] == IAC
    ensures Stripped(Rest(data, i)) == Stripped(AfterCommand(Rest(data, i)))
  {
    hide AfterCommand;
  }

  lemma StripKeeps(data: bytes, i: nat)
    requires i < |data| && !(data[i] == IAC && i + 1 < |data|)
    ensures Stripped(Rest(data, i)) == [data[i]] + Stripped(Rest(data, i + 1))
  {
    NextRest(data, i);
    hide AfterCommand;
  }

  lemma WholeRest(data: bytes)
    ensures Rest(data, 0) == data
  {
  }

  lemma NextRest(data: bytes, i: nat)
    requires i < |data|
    ensures Rest(data, i)[1..] == Rest(data, i + 1)
  {
  }

  lemma NoRest(data: bytes, i: nat)
    requires i >= |data|
    ensures Stripped(Rest(data, i)) == []
  {
  }

  /** The command branch of the loop in `StripIac`. */
  method SkipCommand(data: bytes, i: nat) returns (i': nat)
    requires i + 1 < |data|
    ensures i' > i && Rest(data, i') == AfterCommand(Rest(data, i))
  {
    ghost var rest := data[i..];
    var n, next := |data|, data[i + 1];
    if next == SB {
      var j := i + 2;
      while j < n && data[j] != SE
        invariant i + 2 <= j <= n && AfterSe(data[j..]) == AfterSe(rest[2..])
      {
        assert data[j..][1..] == data[j + 1..];
        j := j + 1;
      }
      i' := j + 1;
    } else if next in {DO, DONT, WILL, WONT} {
      i' := i + 3;
    } else {
      i' := i + 2;
    }
  }

  // ---- negotiation cannot loop ---------------------------------------------------

  lemma {:induction false} RefusalsSkip(verb: byte, opt: byte, rest: bytes)
    ensures Refusals([IAC, verb, opt] + rest) == Refusal(verb, opt) + Refusals(rest)
  {
    assert ([IAC, verb, opt] + rest)[3..] == rest;
  }

  lemma RefusalIsQuiet(verb: byte, opt: byte, rest: bytes)
    requires Refusals(rest) == []
    ensures Refusals(Refusal(verb, opt) + rest) == []
  {
    RefusalsSkip(DONT, opt, rest);
    RefusalsSkip(WONT, opt, rest);
    hide Refusals;
    assert [] + rest == rest;
  }

  /** Nothing in a reply asks for another reply, and a reply is no longer than its cause. */
  lemma {:induction false} ReplyNeedsNoReply(data: bytes)
    ensures Refusals(Refusals(data)) == [] && |Refusals(data)| <= |data|
    decreases |data|
  {
    if data == [] {
    } else {
      if data[0] == IAC && |data| > 2 {
        ReplyNeedsNoReply(data[3..]);
        RefusalIsQuiet(data[1], data[2], Refusals(data[3..]));
      } else {
        ReplyNeedsNoReply(data[1..]);
      }
    }
  }

  /** No IAC, except that a lone one may end the input. */
  predicate Clean(b: bytes) {
    forall i :: 0 <= i < |b| - 1 ==> b[i] != IAC
  }

  lemma {:induction false} StrippedIsClean(data: bytes)
    ensures Clean(Stripped(data))
    ensures Stripped(data) != [] && Stripped(data)[0] == IAC ==> |Stripped(data)| == 1
    decreases |data|
  {
    if data == [] {
    } else {
      if data[0] == IAC && |data| > 1 {
        StrippedIsClean(AfterCommand(data));
      } else {
        StrippedIsClean(data[1..]);
      }
    }
  }

  lemma {:induction false} CleanIsFixed(b: bytes)
    requires Clean(b)
    ensures Stripped(b) == b
  {
    if b == [] {
    } else {
      CleanIsFixed(b[1..]);
    }
  }

  /** Stripping is idempotent and leaves no IAC but possibly a last one. */
  lemma StripIdempotent(data: bytes)
    ensures Stripped(Stripped(data)) == Stripped(data) && Clean(Stripped(data))
  {
    StrippedIsClean(data);
    CleanIsFixed(Stripped(data));
  }

  // ---- reading an encoded line -------------------------------------------------------

  /** What a client may send: text, option requests, and subnegotiations. */
  datatype Item =
    | Text(b: byte)
    | Request(verb: byte, opt: byte)
    | Subnegotiation(payload: bytes)

  predicate WellFormed(item: Item) {
    item.Request? ==> item.verb in {DO, DONT, WILL, WONT}
  }

  /** Data on the wire: an IAC is sent twice (RFC 854 and RFC 855). */
  function Doubled(data: bytes): bytes {
    if data == [] then []
    else (if data[0] == IAC then [IAC, IAC] else [data[0]]) + Doubled(data[1..])
  }

  function Encode(item: Item): bytes {
    match item
    case Text(b) => Doubled([b])
    case Request(verb, opt) => [IAC, verb, opt]
    case Subnegotiation(payload) => [IAC, SB] + Doubled(payload) + [IAC, SE]
  }

  function EncodeAll(items: seq<Item>): bytes {
    if items == [] then [] else Encode(items[0]) + EncodeAll(items[1..])
  }

  function TextOf(items: seq<Item>): bytes {
    if items == [] then []
    else
      var rest := TextOf(items[1..]);
      if items[0].Text? then [items[0].b] + rest else rest
  }

  function RefusalsOf(items: seq<Item>): bytes {
    if items == [] then []
    else
      var rest := RefusalsOf(items[1..]);
      if items[0].Request? then Refusal(items[0].verb, items[0].opt) + rest else rest
  }

  // ---- the text --------------------------------------------------------------------------

  function WithoutIac(data: bytes): bytes {
    if data == [] then []
    else if data[0] == IAC then WithoutIac(data[1..])
    else [data[0]] + WithoutIac(data[1..])
  }

  /** What stripping leaves of an item: its text, and the payload behind an SE, both without IAC. */
  function Residue(item: Item): bytes {
    match item
    case Text(b) => WithoutIac([b])
    case Request(_, _) => []
    case Subnegotiation(payload) => WithoutIac(AfterSe(payload))
  }

  /** The text, and what leaks into it. */
  function LeakyText(items: seq<Item>): bytes {
    if items == [] then [] else Residue(items[0]) + LeakyText(items[1..])
  }

  /** The first SE ends a subnegotiation, whether it is data or not. */
  lemma {:induction false} AfterSeOf(payload: bytes, rest: bytes)
    ensures AfterSe(Doubled(payload) + [IAC, SE] + rest) ==
      if SE in payload then Doubled(AfterSe(payload)) + [IAC, SE] + rest else rest
    decreases |payload|
  {
    hide AfterSe;
    var all := Doubled(payload) + [IAC, SE] + rest;
    if payload == [] {
      AfterSeSkips(IAC, [SE] + rest);
      AfterSeEnds(rest);
      assert all == [IAC] + ([SE] + rest);
    } else {
      var b, tail := payload[0], payload[1..];
      DoubledFirst(payload);
      hide Doubled;
      var next := Doubled(tail) + [IAC, SE] + rest;
      AfterSeOf(tail, rest);
      assert payload == [b] + tail && all == Doubled([b]) + next;
      AfterDatum(b, next);
      AfterSeSkips(b, tail);
      AfterSeEnds(tail);
    }
  }

  lemma AfterDatum(b: byte, next: bytes)
    ensures AfterSe(Doubled([b]) + next) == if b == SE then next else AfterSe(next)
  {
    assert [b][1..] == [];
    hide AfterSe;
    AfterSeSkips(b, next);
    AfterSeEnds(next);
    if b == IAC {
      AfterSeSkips(IAC, [IAC] + next);
      assert Doubled([b]) + next == [IAC] + ([IAC] + next);
    } else {
      assert Doubled([b]) == [b];
    }
  }

  lemma AfterSeSkips(b: byte, rest: bytes)
    ensures b != SE ==> AfterSe([b] + rest) == AfterSe(rest)
  {
    assert ([b] + rest)[1..] == rest;
  }

  lemma AfterSeEnds(rest: bytes)
    ensures AfterSe([SE] + rest) == rest
  {
    assert ([SE] + rest)[1..] == rest;
  }

  /** Of data and the end of a subnegotiation, the bytes other than IAC are kept. */
  lemma {:induction false} StripData(data: bytes, rest: bytes)
    ensures Stripped(Doubled(data) + [IAC, SE] + rest) == WithoutIac(data) + Stripped(rest)
    decreases |data|
  {
    hide Stripped;
    if data == [] {
      assert Doubled(data) + [IAC, SE] + rest == [IAC, SE] + rest;
      StripEnd(rest);
      assert WithoutIac(data) + Stripped(rest) == Stripped(rest);
    } else {
      var next := Doubled(data[1..]) + [IAC, SE] + rest;
      DoubledFirst(data);
      WithoutFirst(data);
      hide Doubled, WithoutIac;
      StripData(data[1..], rest);
      StripDatum(data[0], next);
      assert Doubled(data) + [IAC, SE] + rest == Doubled([data[0]]) + next;
    }
  }

  lemma StripEnd(rest: bytes)
    ensures Stripped([IAC, SE] + rest) == Stripped(rest)
  {
    assert AfterCommand([IAC, SE] + rest) == rest;
  }

  lemma DoubledFirst(data: bytes)
    requires data != []
    ensures Doubled(data) == Doubled([data[0]]) + Doubled(data[1..])
  {
    assert [data[0]][1..] == [];
  }

  lemma WithoutFirst(data: bytes)
    requires data != []
    ensures WithoutIac(data) == (if data[0] == IAC then [] else [data[0]]) + WithoutIac(data[1..])
  {
  }

  lemma WithoutOne(b: byte)
    ensures WithoutIac([b]) == if b == IAC then [] else [b]
  {
    assert [b][1..] == [];
  }

  /** One byte of data. */
  lemma StripDatum(b: byte, rest: bytes)
    ensures Stripped(Doubled([b]) + rest) == (if b == IAC then [] else [b]) + Stripped(rest)
  {
    assert [b][1..] == [];
    if b == IAC {
      assert Doubled([b]) == [IAC, IAC];
      assert AfterCommand([IAC, IAC] + rest) == rest;
    } else {
      assert Doubled([b]) == [b];
      assert ([b] + rest)[1..] == rest;
    }
  }

  lemma SubnegotiationSkipped(payload: bytes, rest: bytes)
    ensures Stripped(Encode(Subnegotiation(payload)) + rest) == Stripped(AfterSe(Doubled(payload) + [IAC, SE] + rest))
  {
    hide AfterSe, Doubled;
    var all := Encode(Subnegotiation(payload)) + rest;
    assert all[2..] == Doubled(payload) + [IAC, SE] + rest;
  }

  lemma StripSubnegotiation(payload: bytes, rest: bytes)
    ensures Stripped(Encode(Subnegotiation(payload)) + rest) == WithoutIac(AfterSe(payload)) + Stripped(rest)
  {
    SubnegotiationSkipped(payload, rest);
    AfterSeOf(payload, rest);
    hide Stripped, Encode, AfterSe, Doubled;
    if SE in payload {
      StripData(AfterSe(payload), rest);
    } else {
      NoSeLeft(payload);
    }
  }

  lemma {:induction false} NoSeLeft(payload: bytes)
    ensures SE !in payload ==> AfterSe(payload) == []
  {
    if payload == [] {
    } else {
      NoSeLeft(payload[1..]);
    }
  }

  lemma StripOne(item: Item, rest: bytes)
    requires WellFormed(item)
    ensures Stripped(Encode(item) + rest) == Residue(item) + Stripped(rest)
  {
    match item {
      case Text(b) =>
        StripDatum(b, rest);
        WithoutOne(b);
      case Request(verb, opt) => assert AfterCommand(Encode(item) + rest) == rest;
      case Subnegotiation(payload) => StripSubnegotiation(payload, rest);
    }
  }

  /** Stripping an encoded line returns its text, and with it the payload behind every SE. */
  lemma {:induction false} StripLeaks(items: seq<Item>)
    requires forall item :: item in items ==> WellFormed(item)
    ensures Stripped(EncodeAll(items)) == LeakyText(items)
  {
    hide Encode, WellFormed, Residue;
    if items == [] {
    } else {
      hide Stripped;
      assert items[0] in items;
      StripOne(items[0], EncodeAll(items[1..]));
      StripLeaks(items[1..]);
    }
  }

  /** Text without IAC, or a payload with nothing but IAC behind an SE. */
  predicate Sealed(item: Item) {
    match item
    case Text(b) => b != IAC
    case Request(_, _) => true
    case Subnegotiation(payload) => forall i, j :: 0 <= i < j < |payload| && payload[i] == SE ==> payload[j] == IAC
  }

  predicate AllIac(data: bytes) {
    forall c :: c in data ==> c == IAC
  }

  lemma {:induction false} WithoutIacHasNone(data: bytes)
    ensures IAC !in WithoutIac(data)
    ensures WithoutIac(data) == [] <==> AllIac(data)
  {
    if data == [] {
    } else {
      WithoutIacHasNone(data[1..]);
      assert data == [data[0]] + data[1..];
      assert data[0] in data && forall c :: c in data[1..] ==> c in data;
    }
  }

  /** Where the bytes behind the first SE stand. */
  lemma {:induction false} FirstSe(payload: bytes) returns (i: nat)
    ensures i <= |payload| && SE !in payload[..i]
    ensures if i == |payload| then AfterSe(payload) == [] else payload[i] == SE && AfterSe(payload) == payload[i + 1..]
  {
    if payload == [] || payload[0] == SE {
      i := 0;
    } else {
      i := FirstSe(payload[1..]);
      assert payload[..i + 1] == [payload[0]] + payload[1..][..i];
      i := i + 1;
    }
  }

  lemma NothingBehindSe(payload: bytes)
    ensures WithoutIac(AfterSe(payload)) == [] <==> Sealed(Subnegotiation(payload))
  {
    var rest := AfterSe(payload);
    WithoutIacHasNone(rest);
    var first := FirstSe(payload);
    hide WithoutIac, AfterSe;
    if Sealed(Subnegotiation(payload)) {
      forall c | c in rest ensures c == IAC {
        var k :| 0 <= k < |rest| && rest[k] == c;
        assert payload[first + 1 + k] == c;
      }
    }
    if AllIac(rest) {
      forall i, j | 0 <= i < j < |payload| && payload[i] == SE ensures payload[j] == IAC {
        FirstSeIsFirst(payload, first, i);
        assert rest[j - first - 1] == payload[j] && rest[j - first - 1] in rest;
      }
    }
  }

  lemma FirstSeIsFirst(payload: bytes, first: nat, i: nat)
    requires first <= |payload| && SE !in payload[..first] && i < |payload| && payload[i] == SE
    ensures first <= i
  {
    InPrefix(payload, first, i);
  }

  lemma InPrefix(payload: bytes, first: nat, i: nat)
    requires first <= |payload|
    ensures i < first ==> payload[i] in payload[..first]
  {
    if i < first {
      assert payload[..first][i] == payload[i];
    }
  }

  /** Text is lost or added exactly where an item is not sealed. */
  lemma ResidueIff(item: Item)
    ensures IAC !in Residue(item)
    ensures item.Subnegotiation? ==> (Residue(item) == [] <==> Sealed(item))
    ensures item.Text? && Sealed(item) ==> Residue(item) == [item.b]
    ensures item.Request? ==> Residue(item) == []
  {
    match item {
      case Text(b) =>
        WithoutOne(b);
      case Request(_, _) =>
      case Subnegotiation(payload) =>
        WithoutIacHasNone(AfterSe(payload));
        NothingBehindSe(payload);
    }
  }

  /** No IAC is left, and without IAC in the text nothing is lost. */
  lemma {:induction false} LeakLength(items: seq<Item>)
    ensures IAC !in LeakyText(items)
    ensures IAC !in TextOf(items) <==> forall item :: item in items && item.Text? ==> item.b != IAC
    ensures IAC !in TextOf(items) ==>
      && |LeakyText(items)| >= |TextOf(items)|
      && (|LeakyText(items)| == |TextOf(items)| ==> forall item :: item in items ==> Sealed(item))
    ensures (forall item :: item in items ==> Sealed(item)) ==> LeakyText(items) == TextOf(items)
  {
    hide Residue;
    if items == [] {
    } else {
      var item, rest := items[0], items[1..];
      LeakLength(rest);
      ResidueIff(item);
      assert items == [item] + rest;
      assert item in items && forall i :: i in rest ==> i in items;
      assert [] + LeakyText(rest) == LeakyText(rest);
    }
  }

  /** Stripping returns exactly the text if and only if the text holds no IAC and nothing but IACs stands
      behind an SE in a payload. */
  lemma StripReturnsText(items: seq<Item>)
    requires forall item :: item in items ==> WellFormed(item)
    ensures Stripped(EncodeAll(items)) == TextOf(items) <==> forall item :: item in items ==> Sealed(item)
  {
    StripLeaks(items);
    LeakLength(items);
  }

  /** A window 240 columns wide: the rest of its size ends up in the text. */
  lemma WidthLeaks(x: byte)
    requires x != IAC && x != SE
    ensures Stripped(Encode(Subnegotiation([SE, x]))) == [x]
  {
    var payload := [SE, x];
    assert payload[1..] == [x] && [x][1..] == [];
    StripSubnegotiation(payload, []);
    assert Encode(Subnegotiation(payload)) + [] == Encode(Subnegotiation(payload));
    assert AfterSe(payload) == [x] && WithoutIac([x]) == [x] + [];
  }

  // ---- the replies -------------------------------------------------------------------------

  /** Without subnegotiations, the replies are exactly the refusals, in order. */
  lemma {:induction false} RepliesAreRefusals(items: seq<Item>)
    requires forall item :: item in items ==>
      WellFormed(item) && !item.Subnegotiation? && (item.Text? ==> item.b != IAC)
    ensures Refusals(EncodeAll(items)) == RefusalsOf(items)
  {
    if items == [] {
    } else {
      var rest := EncodeAll(items[1..]);
      assert items[0] in items;
      RepliesAreRefusals(items[1..]);
      if items[0].Request? {
        RefusalsSkip(items[0].verb, items[0].opt, rest);
      } else {
        PlainData([items[0].b]);
        assert (Encode(items[0]) + rest)[1..] == rest;
      }
    }
  }

  /** Data without IAC is sent as it is. */
  lemma {:induction false} PlainData(data: bytes)
    requires IAC !in data
    ensures Doubled(data) == data
  {
    if data == [] {
    } else {
      PlainData(data[1..]);
      assert data == [data[0]] + data[1..];
    }
  }

  lemma PlainSubnegotiation(payload: bytes)
    requires IAC !in payload
    ensures Encode(Subnegotiation(payload)) == [IAC, SB] + payload + [IAC, SE]
  {
    PlainData(payload);
  }

  /** Well formed, with IAC only where a command starts. */
  predicate Plain(item: Item) {
    && WellFormed(item)
    && match item
       case Text(b) => b != IAC
       case Request(_, opt) => opt != IAC
       case Subnegotiation(payload) => IAC !in payload
  }

  predicate Asks(item: Item) {
    item.Request? && (item.verb == DO || item.verb == WILL)
  }

  /** Whether the scanner swallows the byte behind `item`; `hidden` says that it swallowed the first
      byte of `item`. */
  predicate Hides(item: Item, hidden: bool) {
    item.Subnegotiation? && (hidden || item.payload != [])
  }

  /** The refusals of the requests that the scanner sees. */
  function Answered(items: seq<Item>, hidden: bool): bytes
    decreases |items|
  {
    if items == [] then []
    else
      var item, rest := items[0], Answered(items[1..], Hides(items[0], hidden));
      if item.Request? && !hidden then Refusal(item.verb, item.opt) + rest else rest
  }

  lemma {:induction false} RefusalsPlain(plain: bytes, rest: bytes)
    requires IAC !in plain
    ensures Refusals(plain + rest) == Refusals(rest)
  {
    if plain == [] {
      assert plain + rest == rest;
    } else {
      assert (plain + rest)[1..] == plain[1..] + rest;
      RefusalsPlain(plain[1..], rest);
    }
  }

  /** `b[1:]` */
  function Tail(b: bytes): bytes {
    if b == [] then [] else b[1..]
  }

  /** The IAC SE that ends a subnegotiation swallows the byte behind it. */
  lemma EndSwallows(rest: bytes)
    ensures Refusals([IAC, SE] + rest) == Refusals(Tail(rest))
  {
    if rest == [] {
      assert [IAC, SE] + rest == [IAC, SE] && [IAC, SE][1..] == [SE];
    } else {
      assert [IAC, SE] + rest == [IAC, SE, rest[0]] + rest[1..];
      RefusalsSkip(SE, rest[0], rest[1..]);
    }
  }

  lemma SeenSubnegotiation(payload: bytes, rest: bytes)
    requires IAC !in payload
    ensures Refusals(Encode(Subnegotiation(payload)) + rest) == Refusals(if payload == [] then rest else Tail(rest))
  {
    PlainSubnegotiation(payload);
    hide Refusals, Tail, Encode;
    var all := Encode(Subnegotiation(payload)) + rest;
    if payload == [] {
      assert all == [IAC, SB, IAC] + ([SE] + rest);
      RefusalsSkip(SB, IAC, [SE] + rest);
      RefusalsPlain([SE], rest);
    } else {
      assert all == [IAC, SB, payload[0]] + (payload[1..] + ([IAC, SE] + rest));
      RefusalsSkip(SB, payload[0], payload[1..] + ([IAC, SE] + rest));
      RefusalsPlain(payload[1..], [IAC, SE] + rest);
      EndSwallows(rest);
    }
  }

  lemma HiddenSubnegotiation(payload: bytes, rest: bytes)
    requires IAC !in payload
    ensures Refusals(Tail(Encode(Subnegotiation(payload)) + rest)) == Refusals(Tail(rest))
  {
    PlainSubnegotiation(payload);
    hide Encode, Refusals;
    assert Tail(Encode(Subnegotiation(payload)) + rest) == ([SB] + payload) + ([IAC, SE] + rest);
    hide Refusals, Tail;
    RefusalsPlain([SB] + payload, [IAC, SE] + rest);
    EndSwallows(rest);
  }

  lemma OneItem(item: Item, hidden: bool, rest: bytes)
    requires Plain(item)
    ensures var all := Encode(item) + rest;
      Refusals(if hidden then Tail(all) else all) ==
        (if item.Request? && !hidden then Refusal(item.verb, item.opt) else [])
          + Refusals(if Hides(item, hidden) then Tail(rest) else rest)
  {
    hide Refusals;
    var all := Encode(item) + rest;
    match item {
      case Text(b) =>
        PlainData([b]);
        RefusalsPlain([b], rest);
        assert Tail(all) == rest;
      case Request(verb, opt) =>
        RefusalsSkip(verb, opt, rest);
        RefusalsPlain([verb, opt], rest);
        assert Tail(all) == [verb, opt] + rest;
      case Subnegotiation(payload) =>
        SeenSubnegotiation(payload, rest);
        HiddenSubnegotiation(payload, rest);
    }
  }

  /** What the scanner replies to an encoded line, and to one whose first byte it has swallowed. */
  lemma {:induction false} RepliesAreAnswered(items: seq<Item>, hidden: bool)
    requires forall item :: item in items ==> Plain(item)
    ensures Refusals(if hidden then Tail(EncodeAll(items)) else EncodeAll(items)) == Answered(items, hidden)
    decreases |items|
  {
    hide Plain, Encode, Hides;
    if items == [] {
    } else {
      hide Refusals, Tail;
      assert items[0] in items;
      OneItem(items[0], hidden, EncodeAll(items[1..]));
      RepliesAreAnswered(items[1..], Hides(items[0], hidden));
    }
  }

  /** `items[k]` asks for a reply behind the nonempty subnegotiation `items[j]`, with nothing but
      subnegotiations in between. */
  predicate HiddenBehind(items: seq<Item>, j: int, k: int) {
    && 0 <= j < k < |items| && Asks(items[k]) && items[j].Subnegotiation? && items[j].payload != []
    && forall i :: j < i < k ==> items[i].Subnegotiation?
  }

  /** `items[k]` asks for a reply behind nothing but subnegotiations. */
  predicate AsksAfterSubs(items: seq<Item>, k: int) {
    0 <= k < |items| && Asks(items[k]) && forall i :: 0 <= i < k ==> items[i].Subnegotiation?
  }

  /** No request that asks for a reply is swallowed. */
  predicate AllSeen(items: seq<Item>, hidden: bool)
    decreases |items|
  {
    items == [] || (!(hidden && Asks(items[0])) && AllSeen(items[1..], Hides(items[0], hidden)))
  }

  lemma {:induction false} AnsweredIff(items: seq<Item>, hidden: bool)
    ensures |Answered(items, hidden)| <= |RefusalsOf(items)|
    ensures Answered(items, hidden) == RefusalsOf(items) <==> AllSeen(items, hidden)
    ensures |Answered(items, hidden)| == |RefusalsOf(items)| ==> AllSeen(items, hidden)
    decreases |items|
  {
    hide Hides;
    if items == [] {
    } else {
      AnsweredIff(items[1..], Hides(items[0], hidden));
    }
  }

  lemma HiddenTail(items: seq<Item>, j: int, k: int)
    requires items != [] && j >= 1
    ensures HiddenBehind(items, j, k) <==> HiddenBehind(items[1..], j - 1, k - 1)
  {
    if HiddenBehind(items[1..], j - 1, k - 1) {
      forall i | j < i < k ensures items[i].Subnegotiation? {
        assert items[1..][i - 1].Subnegotiation?;
      }
    }
  }

  lemma SubsTail(items: seq<Item>, k: int)
    requires items != [] && k >= 1
    ensures AsksAfterSubs(items, k) <==> items[0].Subnegotiation? && AsksAfterSubs(items[1..], k - 1)
    ensures HiddenBehind(items, 0, k) <==>
      items[0].Subnegotiation? && items[0].payload != [] && AsksAfterSubs(items[1..], k - 1)
  {
    if items[0].Subnegotiation? && AsksAfterSubs(items[1..], k - 1) {
      forall i | 0 < i < k ensures items[i].Subnegotiation? {
        assert items[1..][i - 1].Subnegotiation?;
      }
    }
  }

  ghost predicate NoneHidden(items: seq<Item>, hidden: bool) {
    && (forall j, k :: !HiddenBehind(items, j, k))
    && (hidden ==> forall k :: !AsksAfterSubs(items, k))
  }

  lemma NoneHiddenStep(items: seq<Item>, hidden: bool)
    requires items != []
    ensures NoneHidden(items, hidden) <==>
      !(hidden && Asks(items[0])) && NoneHidden(items[1..], Hides(items[0], hidden))
  {
    hide HiddenBehind, AsksAfterSubs;
    var rest, hidden' := items[1..], Hides(items[0], hidden);
    FirstAsks(items);
    if NoneHidden(items, hidden) {
      forall j, k ensures !HiddenBehind(rest, j, k) {
        HiddenRange(rest, j, k);
        if j >= 0 { HiddenTail(items, j + 1, k + 1); }
      }
      if hidden' {
        forall k ensures !AsksAfterSubs(rest, k) {
          HiddenRange(rest, 0, k);
          if k >= 0 { SubsTail(items, k + 1); }
        }
      }
    }
    if !(hidden && Asks(items[0])) && NoneHidden(rest, hidden') {
      forall j, k ensures !HiddenBehind(items, j, k) {
        HiddenRange(items, j, k);
        if j >= 1 { HiddenTail(items, j, k); }
        if k >= 1 { SubsTail(items, k); }
      }
      if hidden {
        forall k ensures !AsksAfterSubs(items, k) {
          HiddenRange(items, 0, k);
          if k >= 1 { SubsTail(items, k); }
        }
      }
    }
  }

  lemma FirstAsks(items: seq<Item>)
    requires items != []
    ensures AsksAfterSubs(items, 0) <==> Asks(items[0])
  {
  }

  lemma HiddenRange(items: seq<Item>, j: int, k: int)
    ensures HiddenBehind(items, j, k) ==> 0 <= j < k
    ensures AsksAfterSubs(items, k) ==> k >= 0
  {
  }

  lemma {:induction false} AllSeenIff(items: seq<Item>, hidden: bool)
    ensures AllSeen(items, hidden) <==> NoneHidden(items, hidden)
    decreases |items|
  {
    hide Hides;
    if items == [] {
    } else {
      hide NoneHidden;
      NoneHiddenStep(items, hidden);
      AllSeenIff(items[1..], Hides(items[0], hidden));
    }
  }

  /** The replies are exactly the refusals if and only if no request that asks for one stands behind
      a nonempty subnegotiation with nothing but subnegotiations in between. */
  lemma RepliesAreRefusalsIff(items: seq<Item>)
    requires forall item :: item in items ==> Plain(item)
    ensures Refusals(EncodeAll(items)) == RefusalsOf(items) <==> forall j, k :: !HiddenBehind(items, j, k)
  {
    hide Refusals, HiddenBehind, AsksAfterSubs;
    RepliesAreAnswered(items, false);
    AnsweredIff(items, false);
    AllSeenIff(items, false);
  }

  /** A window size hides the request behind it. */
  lemma SubnegotiationHidesRequest(payload: bytes, verb: byte, opt: byte)
    requires payload != [] && IAC !in payload && opt != IAC && verb in {DO, WILL}
    ensures var items := [Subnegotiation(payload), Request(verb, opt)];
      Refusals(EncodeAll(items)) == [] && RefusalsOf(items) == Refusal(verb, opt) != []
  {
    var items := [Subnegotiation(payload), Request(verb, opt)];
    assert items[1..] == [Request(verb, opt)] && items[1..][1..] == [];
    RepliesAreAnswered(items, false);
    hide Refusals;
    assert Answered(items[1..], true) == [];
    assert RefusalsOf(items[1..]) == Refusal(verb, opt) + [];
  }

  /** Data can be answered: behind a doubled IAC, a payload byte DO or WILL is taken for a request. */
  lemma DataIsAnswered(verb: byte, opt: byte)
    requires verb in {DO, WILL} && opt != IAC
    ensures var items := [Subnegotiation([IAC, verb, opt])];
      Refusals(EncodeAll(items)) == Refusal(verb, opt) != [] && RefusalsOf(items) == []
  {
    var payload := [IAC, verb, opt];
    var items := [Subnegotiation(payload)];
    assert items[1..] == [] && payload[1..] == [verb, opt] && payload[1..][1..] == [opt] && [opt][1..] == [];
    PlainData([verb, opt]);
    assert Encode(items[0]) == [IAC, SB, IAC] + ([IAC, verb, opt] + [IAC, SE]);
    assert EncodeAll(items) == Encode(items[0]) + [];
    assert Encode(items[0]) + [] == Encode(items[0]);
    RefusalsSkip(SB, IAC, [IAC, verb, opt] + [IAC, SE]);
    RefusalsSkip(verb, opt, [IAC, SE]);
    EndSwallows([]);
    hide Refusals;
    assert [IAC, SE] + [] == [IAC, SE] && Refusals([]) == [] by { NoRefusals([]); }
  }

  /** The codes of RFC 854: WILL is answered with DONT, DO with WONT, and these with nothing. */
  lemma CommandCodes(opt: byte)
    ensures RefusalsOf([Request(251, opt)]) == [255, 254, opt] && RefusalsOf([Request(253, opt)]) == [255, 252, opt]
    ensures RefusalsOf([Request(252, opt)]) == RefusalsOf([Request(254, opt)]) == []
    ensures Encode(Request(253, opt)) == [255, 253, opt] && Encode(Text(255)) == [255, 255]
    ensures Encode(Subnegotiation([opt])) == [255, 250] + Encode(Text(opt)) + [255, 240]
  {
    forall verb: byte ensures RefusalsOf([Request(verb, opt)]) == Refusal(verb, opt) {
      var items := [Request(verb, opt)];
      assert items[1..] == [];
    }
    assert [255][1..] == [];
  }
}
