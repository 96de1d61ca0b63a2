/** The RESP request parser of the Redis honeypot (services/redis_honeypot/protocol.py). */
module RespProtocol {
  import opened Bytes
  import opened Utf8
  import Decimal

  const STAR: byte := 42
  const DOLLAR: byte := 36

  type Args = seq<bytes>

  /** `Incomplete` is Python's `(None, buf)`. */
  datatype Parsed = Incomplete | Command(args: Args, rest: bytes)

  // ---- specification -------------------------------------------------------

  /** What the parser does with `buf`. */
  function Parse(buf: bytes): Parsed {
    if buf == [] then Incomplete
    else if buf[0] == STAR then ParseArray(buf)
    else
      var idx := FindCrlf(buf, 0);
      if idx == -1 then Incomplete else Command(InlineArgs(buf[..idx]), buf[idx + 2..])
  }

  function ParseArray(buf: bytes): Parsed {
    var idx := FindCrlf(buf, 0);
    if idx == -1 then Incomplete
    else match Decimal.ParseInt(Slice(buf, 1, idx))
      case None => Command([[]], buf[idx + 2..])
      case Some(count) => ParseBulks(buf, idx + 2, count, [])
  }

  /** One bulk string at `pos`: not there yet, a length that is no number, or a body. */
  datatype Bulk = Missing | BadLength(rest: bytes) | Body(arg: bytes, end: int)

  function ReadBulk(buf: bytes, pos: int): Bulk {
    if pos >= |buf| || Slice(buf, pos, pos + 1) != [DOLLAR] then Missing
    else
      var nl := FindCrlf(buf, pos);
      if nl == -1 then Missing
      else match Decimal.ParseInt(Slice(buf, pos + 1, nl))
        case None => BadLength(From(buf, nl + 2))
        case Some(len) =>
          var end := nl + 2 + len;
          if end + 2 > |buf| then Missing else Body(Slice(buf, nl + 2, end), end)
  }

  /** `count` more bulk strings from `pos` on, after the arguments `args`. */
  function ParseBulks(buf: bytes, pos: int, count: int, args: Args): Parsed
    decreases count
  {
    if count <= 0 then Command(args, From(buf, pos))
    else match ReadBulk(buf, pos)
      case Missing => Incomplete
      case BadLength(rest) => Command([[]], rest)
      case Body(arg, end) => ParseBulks(buf, end + 2, count - 1, args + [arg])
  }

  /** `line.split()` */
  function Split(line: bytes): (words: seq<bytes>)
    decreases |line|
  {
    if line == [] then []
    else if BlankLength(line) > 0 then Split(line[BlankLength(line)..])
    else
      var n := WordLength(line);
      [line[..n]] + Split(line[n..])
  }

  function WordLength(line: bytes): (n: nat)
    ensures n <= |line|
    ensures line != [] && BlankLength(line) == 0 ==> n > 0
  {
    if line == [] || BlankLength(line) > 0 then 0 else 1 + WordLength(line[1..])
  }

  function InlineArgs(line: bytes): Args {
    if Split(line) == [] then [[]] else Split(line)
  }

  // ---- the parser as written ------------------------------------------------

  method ParseCommand(buf: bytes) returns (r: Parsed)
    ensures r == Parse(buf)
  {
    if buf == [] { return Incomplete; }
    if buf[0] == STAR {
      r := ParseRespArray(buf);
      return;
    }
    var idx := FindCrlf(buf, 0);
    if idx == -1 { return Incomplete; }
    return Command(InlineArgs(buf[..idx]), buf[idx + 2..]);
  }

  method ParseRespArray(buf: bytes) returns (r: Parsed)
    ensures r == ParseArray(buf)
  {
    hide Decimal.ParseInt, ReadBulk, FindCrlf, Slice, From;
    var idx := FindCrlf(buf, 0);
    if idx == -1 { return Incomplete; }
    var count := Decimal.ParseInt(Slice(buf, 1, idx));
    if count == None { return Command([[]], buf[idx + 2..]); }
    var pos := idx + 2;
    var args: Args := [];
    var i := 0;
    while i < count.value
      invariant 0 <= i && (i <= count.value || i == 0)
      invariant ParseBulks(buf, pos, count.value - i, args) == ParseArray(buf)
    {
      var bulk := NextBulk(buf, pos);
      match bulk {
        case Missing => return Incomplete;
        case BadLength(rest) => return Command([[]], rest);
        case Body(arg, end) =>
          args := args + [arg];
          pos := end + 2;
      }
      i := i + 1;
    }
    return Command(args, From(buf, pos));
  }

  /** One turn of the loop over the announced arguments. */
  method NextBulk(buf: bytes, pos: int) returns (bulk: Bulk)
    ensures bulk == ReadBulk(buf, pos)
  {
    if pos >= |buf| || Slice(buf, pos, pos + 1) != [DOLLAR] { return Missing; }
    var nl := FindCrlf(buf, pos);
    if nl == -1 { return Missing; }
    var blen := Decimal.ParseInt(Slice(buf, pos + 1, nl));
    if blen == None { return BadLength(From(buf, nl + 2)); }
    var start := nl + 2;
    var end := start + blen.value;
    if end + 2 > |buf| { return Missing; }
    return Body(Slice(buf, start, end), end);
  }

  // ---- prefix stability -------------------------------------------------------

  /** Some bulk length is so negative that the body's end lies before the buffer,
      where Python counts from the other end. */
  predicate ReachesBack(buf: bytes) {
    && buf != [] && buf[0] == STAR
    && var idx := FindCrlf(buf, 0);
    && idx != -1
    && var count := Decimal.ParseInt(Slice(buf, 1, idx));
    && count.Some? && BulkReachesBack(buf, idx + 2, count.value)
  }

  predicate BulkReachesBack(buf: bytes, pos: nat, count: int)
    decreases count
  {
    && count > 0
    && var bulk := ReadBulk(buf, pos);
    && bulk.Body? && (bulk.end < 0 || BulkReachesBack(buf, bulk.end + 2, count - 1))
  }

  /** A bulk string that has arrived stays the same when more bytes follow. */
  lemma ReadBulkStable(buf: bytes, more: bytes, pos: nat)
    requires pos <= |buf| && !ReadBulk(buf, pos).Missing?
    ensures match ReadBulk(buf, pos)
      case BadLength(rest) =>
        && ReadBulk(buf + more, pos) == BadLength(rest + more)
        && |rest| + 2 <= |buf| && rest == buf[|buf| - |rest|..]
      case Body(arg, end) =>
        && ReadBulk(buf + more, pos).Body? && ReadBulk(buf + more, pos).end == end && end + 2 <= |buf|
        && (end >= 0 ==> ReadBulk(buf + more, pos).arg == arg)
  {
    hide Decimal.ParseInt, FindCrlf, Slice, From;
    var nl := FindCrlf(buf, pos);
    BulkHeaderStable(buf, more, pos);
    var len := Decimal.ParseInt(Slice(buf, pos + 1, nl));
    if len == None {
      FromStable(buf, more, nl + 2);
    } else if nl + 2 + len.value >= 0 {
      SliceStable(buf, more, nl + 2, nl + 2 + len.value);
    }
  }

  lemma SliceStable(buf: bytes, more: bytes, i: nat, j: nat)
    requires j <= |buf|
    ensures Slice(buf + more, i, j) == Slice(buf, i, j)
  {
    if i < j {
      assert (buf + more)[i..j] == buf[i..j];
    }
  }

  lemma FromStable(buf: bytes, more: bytes, k: nat)
    requires k <= |buf|
    ensures From(buf + more, k) == From(buf, k) + more
    ensures From(buf, k) == buf[k..]
  {
    assert (buf + more)[k..] == buf[k..] + more;
  }

  /** The marker and the length of a bulk string that has arrived. */
  lemma BulkHeaderStable(buf: bytes, more: bytes, pos: nat)
    requires pos <= |buf| && !ReadBulk(buf, pos).Missing?
    ensures var nl := FindCrlf(buf, pos);
      && pos < |buf| && pos <= nl <= |buf| - 2 && FindCrlf(buf + more, pos) == nl
      && Slice(buf + more, pos, pos + 1) == Slice(buf, pos, pos + 1) == [DOLLAR]
      && Slice(buf + more, pos + 1, nl) == Slice(buf, pos + 1, nl)
  {
    hide Decimal.ParseInt, Slice, From;
    FindCrlfStable(buf, more, pos);
    CrlfInside(buf, FindCrlf(buf, pos));
    hide FindCrlf;
    SliceStable(buf, more, pos, pos + 1);
    SliceStable(buf, more, pos + 1, FindCrlf(buf, pos));
  }

  lemma CrlfInside(buf: bytes, k: int)
    ensures CrlfAt(buf, k) ==> 0 <= k <= |buf| - 2
  {
  }

  lemma {:induction false} BulksStable(buf: bytes, more: bytes, pos: nat, count: int, args: Args)
    requires 2 <= pos <= |buf| && !BulkReachesBack(buf, pos, count)
    requires ParseBulks(buf, pos, count, args).Command?
    ensures var r := ParseBulks(buf, pos, count, args);
      && ParseBulks(buf + more, pos, count, args) == Command(r.args, r.rest + more)
      && |r.rest| + 2 <= |buf| && r.rest == buf[|buf| - |r.rest|..]
    decreases count
  {
    hide ReadBulk;
    if count > 0 {
      ReadBulkStable(buf, more, pos);
      match ReadBulk(buf, pos) {
        case BadLength(rest) =>
        case Body(arg, end) => BulksStable(buf, more, end + 2, count - 1, args + [arg]);
      }
    } else {
      assert From(buf + more, pos) == From(buf, pos) + more;
    }
  }

  /** A finished command is not changed by the bytes that follow it, and consumes something. */
  lemma ParseStable(buf: bytes, more: bytes)
    requires Parse(buf).Command? && !ReachesBack(buf)
    ensures var r := Parse(buf);
      && Parse(buf + more) == Command(r.args, r.rest + more)
      && |r.rest| < |buf| && r.rest == buf[|buf| - |r.rest|..]
  {
    hide Decimal.ParseInt, ReadBulk, Split;
    var idx := FindCrlf(buf, 0);
    FindCrlfStable(buf, more, 0);
    assert (buf + more)[0] == buf[0];
    assert (buf + more)[..idx] == buf[..idx];
    assert (buf + more)[idx + 2..] == buf[idx + 2..] + more;
    if buf[0] == STAR {
      assert Slice(buf + more, 1, idx) == Slice(buf, 1, idx);
      var count := Decimal.ParseInt(Slice(buf, 1, idx));
      if count.Some? {
        BulksStable(buf, more, idx + 2, count.value, []);
      }
    }
  }

  lemma {:induction false} BulksReachMore(buf: bytes, more: bytes, pos: nat, count: int)
    requires pos <= |buf| && BulkReachesBack(buf, pos, count)
    ensures BulkReachesBack(buf + more, pos, count)
    decreases count
  {
    hide ReadBulk;
    ReadBulkStable(buf, more, pos);
    var end := ReadBulk(buf, pos).end;
    if end >= 0 {
      BulksReachMore(buf, more, end + 2, count - 1);
    }
  }

  lemma ReachMore(buf: bytes, more: bytes)
    requires ReachesBack(buf)
    ensures ReachesBack(buf + more)
  {
    hide Decimal.ParseInt, ReadBulk;
    var idx := FindCrlf(buf, 0);
    FindCrlfStable(buf, more, 0);
    assert Slice(buf + more, 1, idx) == Slice(buf, 1, idx);
    BulksReachMore(buf, more, idx + 2, Decimal.ParseInt(Slice(buf, 1, idx)).value);
  }

  /** No dollar sign can be read at a position that a body ending before the buffer leads to. */
  lemma NoBulkBehind(buf: bytes, filler: bytes, end: int)
    requires |buf| >= 2 && buf[0] != DOLLAR && buf[1] != DOLLAR
    requires end < 0 && |filler| > -end && forall c :: c in filler ==> c != DOLLAR
    ensures ReadBulk(buf + filler, end + 2) == Missing
  {
    hide Decimal.ParseInt, FindCrlf, Slice;
    var all, p := buf + filler, end + 2;
    if p >= 0 {
      assert all[p] == buf[p];
    } else {
      assert all[|all| + p] == filler[|filler| + p] && filler[|filler| + p] in filler;
    }
    SliceHead(all, p);
  }

  lemma SliceHead(b: bytes, p: int)
    requires -|b| <= p < |b|
    ensures var s := Slice(b, p, p + 1); s != [] ==> s[0] == b[if p < 0 then |b| + p else p]
  {
  }

  /** A body that reaches back grows with the buffer, so the command does change. */
  lemma {:induction false} BulksUnstable(buf: bytes, pos: nat, count: int, args: Args) returns (more: bytes)
    requires |buf| >= 2 && buf[0] != DOLLAR && buf[1] != DOLLAR && pos <= |buf|
    requires BulkReachesBack(buf, pos, count) && ParseBulks(buf, pos, count, args).Command?
    ensures var r := ParseBulks(buf, pos, count, args);
      ParseBulks(buf + more, pos, count, args) != Command(r.args, r.rest + more)
    decreases count
  {
    hide ReadBulk;
    ReadBulkStable(buf, [], pos);
    var end, arg := ReadBulk(buf, pos).end, ReadBulk(buf, pos).arg;
    if end >= 0 {
      more := BulksUnstable(buf, end + 2, count - 1, args + [arg]);
      ReadBulkStable(buf, more, pos);
    } else {
      more := seq(|buf| - end + 1, _ => STAR);
      ReadBulkStable(buf, more, pos);
      BodyGrows(buf, more, pos);
      NoBulkBehind(buf, more, end);
      if count == 1 {
        var long := ReadBulk(buf + more, pos).arg;
        assert (args + [long])[|args|] != (args + [arg])[|args|];
      }
    }
  }

  lemma BodyGrows(buf: bytes, more: bytes, pos: nat)
    requires pos <= |buf| && ReadBulk(buf, pos).Body? && ReadBulk(buf, pos).end < 0
    requires |more| > |buf| - ReadBulk(buf, pos).end
    ensures ReadBulk(buf + more, pos).Body?
    ensures |ReadBulk(buf, pos).arg| <= |buf| < |ReadBulk(buf + more, pos).arg|
  {
    hide Decimal.ParseInt, FindCrlf, Slice;
    BulkHeaderStable(buf, more, pos);
    SliceGrows(buf, more, FindCrlf(buf, pos) + 2, ReadBulk(buf, pos).end);
  }

  lemma SliceGrows(buf: bytes, more: bytes, i: nat, j: int)
    requires i <= |buf| && j < 0 && |more| > |buf| - j
    ensures |Slice(buf + more, i, j)| > |buf|
  {
  }

  /** Exactly when a finished command is final: its frame can be cut out of any longer stream
      if and only if no bulk length points before the buffer. */
  lemma ParseStableIff(buf: bytes)
    requires Parse(buf).Command?
    ensures (forall more: bytes :: Parse(buf + more) == Command(Parse(buf).args, Parse(buf).rest + more))
      <==> !ReachesBack(buf)
  {
    if !ReachesBack(buf) {
      forall more: bytes ensures Parse(buf + more) == Command(Parse(buf).args, Parse(buf).rest + more) {
        ParseStable(buf, more);
      }
    } else {
      var more := ReachIsUnstable(buf);
      assert Parse(buf + more) != Command(Parse(buf).args, Parse(buf).rest + more);
    }
  }

  lemma CountHasNoDollar(buf: bytes, idx: nat)
    requires CrlfAt(buf, idx) && buf[0] == STAR && Decimal.ParseInt(Slice(buf, 1, idx)).Some?
    ensures idx >= 2 && buf[1] != DOLLAR
  {
    var header := Slice(buf, 1, idx);
    if idx >= 2 && buf[1] == DOLLAR {
      assert header[0] == DOLLAR;
      Decimal.ParseIntRejects(header);
    }
    assert idx < 2 ==> header == [];
  }

  lemma ReachIsUnstable(buf: bytes) returns (more: bytes)
    requires Parse(buf).Command? && ReachesBack(buf)
    ensures Parse(buf + more) != Command(Parse(buf).args, Parse(buf).rest + more)
  {
    hide Parse, ReachesBack, ReadBulk, ParseBulks, BulkReachesBack;
    var pos, count := ArrayHeader(buf);
    more := BulksUnstable(buf, pos, count, []);
    HeaderStays(buf, more, pos, count);
  }

  /** Where the bulk strings of an array that reaches back start, and how many are announced. */
  lemma ArrayHeader(buf: bytes) returns (pos: nat, count: int)
    requires ReachesBack(buf)
    ensures HasHeader(buf, pos, count) && BulkReachesBack(buf, pos, count)
    ensures Parse(buf) == ParseBulks(buf, pos, count, [])
    ensures |buf| >= 2 && buf[0] != DOLLAR && buf[1] != DOLLAR
  {
    hide Decimal.ParseInt, ParseBulks, BulkReachesBack;
    var idx := FindCrlf(buf, 0);
    CountHasNoDollar(buf, idx);
    pos, count := idx + 2, Decimal.ParseInt(Slice(buf, 1, idx)).value;
  }

  predicate HasHeader(buf: bytes, pos: nat, count: int) {
    && pos >= 2 && pos <= |buf| && buf[0] == STAR && FindCrlf(buf, 0) == pos - 2
    && Decimal.ParseInt(Slice(buf, 1, pos - 2)) == Some(count)
  }

  lemma HeaderStays(buf: bytes, more: bytes, pos: nat, count: int)
    requires HasHeader(buf, pos, count)
    ensures Parse(buf + more) == ParseBulks(buf + more, pos, count, [])
  {
    hide Decimal.ParseInt, ParseBulks;
    FindCrlfStable(buf, more, 0);
    assert Slice(buf + more, 1, pos - 2) == Slice(buf, 1, pos - 2);
  }

  // ---- progress ------------------------------------------------------------------

  /** The position behind the last body, when all `count` bodies are there. */
  function EndOfBulks(buf: bytes, pos: int, count: int): Option<int>
    decreases count
  {
    if count <= 0 then Some(pos)
    else match ReadBulk(buf, pos)
      case Body(_, end) => EndOfBulks(buf, end + 2, count - 1)
      case _ => None
  }

  /** Where a complete array ends. */
  function EndOfArray(buf: bytes): Option<int> {
    if buf == [] || buf[0] != STAR then None
    else
      var idx := FindCrlf(buf, 0);
      if idx == -1 then None
      else match Decimal.ParseInt(Slice(buf, 1, idx))
        case None => None
        case Some(count) => EndOfBulks(buf, idx + 2, count)
  }

  /** Python takes a position at or before `-|buf|` for the start. */
  predicate AtStart(buf: bytes, pos: int) {
    pos == 0 || pos <= -|buf|
  }

  lemma FromIsAllIff(buf: bytes, pos: int)
    requires buf != []
    ensures From(buf, pos) == buf <==> AtStart(buf, pos)
  {
    assert |From(buf, pos)| == |buf| - Bound(pos, |buf|);
  }

  lemma {:induction false} BulksConsume(buf: bytes, pos: int, count: int, args: Args)
    requires buf != [] && ParseBulks(buf, pos, count, args).Command?
    ensures var end := EndOfBulks(buf, pos, count);
      ParseBulks(buf, pos, count, args).rest == buf <==> end.Some? && AtStart(buf, end.value)
    decreases count
  {
    hide ReadBulk, From, AtStart;
    if count <= 0 {
      FromIsAllIff(buf, pos);
    } else {
      match ReadBulk(buf, pos) {
        case BadLength(rest) => BadLengthConsumes(buf, pos);
        case Body(arg, end) => BulksConsume(buf, end + 2, count - 1, args + [arg]);
      }
    }
  }

  lemma BadLengthConsumes(buf: bytes, pos: int)
    ensures ReadBulk(buf, pos).BadLength? ==> |ReadBulk(buf, pos).rest| < |buf|
  {
    hide Decimal.ParseInt;
  }

  /** Exactly when a completed parse makes no progress: the array's last body ends where Python counts
      back to the start of the buffer. */
  lemma ConsumesNothingIff(buf: bytes)
    requires Parse(buf).Command?
    ensures var end := EndOfArray(buf);
      Parse(buf).rest == buf <==> end.Some? && AtStart(buf, end.value)
  {
    hide Decimal.ParseInt, AtStart, Split, ReadBulk, Slice, EndOfBulks, ParseBulks;
    var idx := FindCrlf(buf, 0);
    assert |buf[idx + 2..]| < |buf|;
    if buf[0] == STAR {
      var count := Decimal.ParseInt(Slice(buf, 1, idx));
      if count.Some? {
        BulksConsume(buf, idx + 2, count.value, []);
      }
    }
  }

  // ---- round trip --------------------------------------------------------------

  const CRLF: bytes := [CR, LF]

  function EncodeBulk(arg: bytes): bytes {
    [DOLLAR] + Decimal.Print(|arg|) + CRLF + arg + CRLF
  }

  function EncodeBulks(args: Args): bytes {
    if args == [] then [] else EncodeBulk(args[0]) + EncodeBulks(args[1..])
  }

  /** The RESP array of bulk strings a client sends for `args`. */
  function Encode(args: Args): (r: bytes)
    ensures r != []
  {
    [STAR] + Decimal.Print(|args|) + CRLF + EncodeBulks(args)
  }

  /** All lengths can be read back by `int()`, whose input the interpreter limits to 4300 digits. */
  predicate Encodable(args: Args) {
    && |Decimal.Print(|args|)| <= Decimal.MAX_STR_DIGITS
    && forall a :: a in args ==> |Decimal.Print(|a|)| <= Decimal.MAX_STR_DIGITS
  }

  /** After a marker byte and digits, the next CRLF is the one that ends the header. */
  lemma HeaderEnd(pre: bytes, mark: byte, n: nat, rest: bytes)
    requires mark != CR
    ensures var buf := pre + [mark] + Decimal.Print(n) + CRLF + rest;
      && FindCrlf(buf, |pre|) == |pre| + 1 + |Decimal.Print(n)|
      && Slice(buf, |pre| + 1, |pre| + 1 + |Decimal.Print(n)|) == Decimal.Print(n)
  {
    var digits := Decimal.Print(n);
    var buf := pre + [mark] + digits + CRLF + rest;
    var nl := |pre| + 1 + |digits|;
    assert buf[nl] == CR && buf[nl + 1] == LF;
    forall k | |pre| <= k < nl ensures !CrlfAt(buf, k) {
      if k > |pre| {
        assert buf[k] == digits[k - |pre| - 1];
        assert buf[k] in digits;
      }
    }
    FindCrlfUnique(buf, |pre|, nl);
    assert buf[|pre| + 1..nl] == digits;
  }

  lemma BulkLayout(pre: bytes, arg: bytes, rest: bytes)
    ensures var buf := pre + EncodeBulk(arg) + rest;
      var start := |pre| + 3 + |Decimal.Print(|arg|)|;
      && buf == pre + [DOLLAR] + Decimal.Print(|arg|) + CRLF + (arg + CRLF + rest)
      && start + |arg| == |pre| + |EncodeBulk(arg)| - 2 <= |buf| - 2
      && buf[start..start + |arg|] == arg
  {
    var digits := Decimal.Print(|arg|);
    hide Decimal.Print;
    assert pre + EncodeBulk(arg) + rest == (pre + [DOLLAR] + digits + CRLF) + arg + (CRLF + rest);
  }

  lemma ReadEncodedBulk(pre: bytes, arg: bytes, rest: bytes)
    requires |Decimal.Print(|arg|)| <= Decimal.MAX_STR_DIGITS
    ensures ReadBulk(pre + EncodeBulk(arg) + rest, |pre|) == Body(arg, |pre| + |EncodeBulk(arg)| - 2)
    ensures |EncodeBulk(arg)| >= 2
  {
    hide Decimal.ParseInt, Decimal.Print, FindCrlf, EncodeBulk, Slice;
    BulkLayout(pre, arg, rest);
    HeaderEnd(pre, DOLLAR, |arg|, arg + CRLF + rest);
    Decimal.ParseIntOfPrint(|arg|);
    var buf := pre + EncodeBulk(arg) + rest;
    var start := |pre| + 3 + |Decimal.Print(|arg|)|;
    SliceInside(buf, |pre|, |pre| + 1);
    SliceInside(buf, start, start + |arg|);
    assert buf[|pre|..|pre| + 1] == [DOLLAR];
  }

  lemma {:induction false} ParseEncodedBulks(pre: bytes, args: Args, rest: bytes, done: Args)
    requires forall a :: a in args ==> |Decimal.Print(|a|)| <= Decimal.MAX_STR_DIGITS
    ensures var buf := pre + EncodeBulks(args) + rest;
      && ParseBulks(buf, |pre|, |args|, done) == Command(done + args, rest)
      && !BulkReachesBack(buf, |pre|, |args|)
    decreases |args|
  {
    hide ReadBulk, EncodeBulk;
    var buf := pre + EncodeBulks(args) + rest;
    if args == [] {
      assert buf == pre + rest && done + args == done;
    } else {
      var head, tail := EncodeBulk(args[0]), EncodeBulks(args[1..]);
      assert buf == pre + head + (tail + rest);
      assert buf == (pre + head) + tail + rest;
      ReadEncodedBulk(pre, args[0], tail + rest);
      ParseEncodedBulks(pre + head, args[1..], rest, done + [args[0]]);
      assert done + [args[0]] + args[1..] == done + args;
    }
  }

  /** Whatever bytes the arguments hold, CRLF included, the parser returns them and leaves what follows. */
  lemma RoundTrip(args: Args, rest: bytes)
    requires Encodable(args)
    ensures Parse(Encode(args) + rest) == Command(args, rest)
    ensures !ReachesBack(Encode(args) + rest)
  {
    hide EncodeBulks, Decimal.Print, Decimal.ParseInt, FindCrlf, ReadBulk, ParseBulks, BulkReachesBack;
    var buf := Encode(args) + rest;
    var digits := Decimal.Print(|args|);
    var header := [STAR] + digits + CRLF;
    assert buf == [] + [STAR] + digits + CRLF + (EncodeBulks(args) + rest);
    HeaderEnd([], STAR, |args|, EncodeBulks(args) + rest);
    Decimal.ParseIntOfPrint(|args|);
    assert buf == header + EncodeBulks(args) + rest;
    ParseEncodedBulks(header, args, rest, []);
    assert [] + args == args;
  }

  // ---- inline commands -----------------------------------------------------------

  /** No blank starts anywhere in it. */
  predicate BlankFree(w: bytes)
    decreases |w|
  {
    w == [] || (BlankLength(w) == 0 && BlankFree(w[1..]))
  }

  predicate IsWord(w: bytes) {
    w != [] && BlankFree(w)
  }

  predicate IsGap(g: bytes)
    decreases |g|
  {
    g == [] || (BlankLength(g) > 0 && g[0] != CR && IsGap(g[BlankLength(g)..]))
  }

  /** Words with blanks before, between and after them. */
  function Line(words: seq<bytes>, gaps: seq<bytes>): bytes
    requires |gaps| == |words| + 1
  {
    if words == [] then gaps[0] else gaps[0] + words[0] + Line(words[1..], gaps[1..])
  }

  predicate IsLine(words: seq<bytes>, gaps: seq<bytes>) {
    && |gaps| == |words| + 1
    && (forall w :: w in words ==> IsWord(w)) && (forall g :: g in gaps ==> IsGap(g))
    && forall i :: 0 < i < |words| ==> gaps[i] != []
  }

  /** No blank reaches from a word into a blank. */
  lemma NoBlankAcross(word: bytes, rest: bytes)
    requires word != [] && BlankLength(word) == 0 && (rest == [] || BlankLength(rest) > 0)
    ensures BlankLength(word + rest) == 0
  {
    var b := word + rest;
    assert |word| == 1 && rest != [] ==> b[1] == rest[0];
    assert |word| == 2 && rest != [] ==> b[1] == word[1] && b[2] == rest[0];
    assert |word| >= 3 ==> b[1] == word[1] && b[2] == word[2];
    assert rest == [] ==> b == word;
  }

  lemma {:induction false} SplitGap(gap: bytes, rest: bytes)
    requires IsGap(gap)
    ensures Split(gap + rest) == Split(rest)
    decreases |gap|
  {
    hide BlankLength, WordLength;
    if gap == [] {
      assert gap + rest == rest;
    } else {
      var n := BlankLength(gap);
      BlankStays(gap, rest);
      assert (gap + rest)[n..] == gap[n..] + rest;
      SplitGap(gap[n..], rest);
    }
  }

  lemma {:induction false} WordLengthOf(word: bytes, rest: bytes)
    requires BlankFree(word) && (rest == [] || BlankLength(rest) > 0)
    ensures WordLength(word + rest) == |word|
  {
    hide BlankLength;
    if word == [] {
      assert word + rest == rest;
    } else {
      NoBlankAcross(word, rest);
      assert (word + rest)[1..] == word[1..] + rest;
      WordLengthOf(word[1..], rest);
    }
  }

  lemma SplitWord(word: bytes, rest: bytes)
    requires IsWord(word) && (rest == [] || BlankLength(rest) > 0)
    ensures Split(word + rest) == [word] + Split(rest)
  {
    hide BlankLength, WordLength;
    WordLengthOf(word, rest);
    NoBlankAcross(word, rest);
    assert (word + rest)[..|word|] == word && (word + rest)[|word|..] == rest;
  }

  lemma {:induction false} WordLengthFree(line: bytes)
    ensures BlankFree(line[..WordLength(line)])
  {
    hide BlankLength;
    if line == [] || BlankLength(line) > 0 {
    } else {
      var n := WordLength(line);
      BlankStays(line[..n], line[n..]);
      assert line == line[..n] + line[n..];
      WordLengthFree(line[1..]);
      assert line[..n][1..] == line[1..][..n - 1];
    }
  }

  /** Splitting any line gives words without blanks. */
  lemma {:induction false} SplitGivesWords(line: bytes)
    ensures forall w :: w in Split(line) ==> IsWord(w)
    decreases |line|
  {
    hide BlankLength, WordLength, BlankFree;
    if line == [] {
    } else if BlankLength(line) > 0 {
      SplitGivesWords(line[BlankLength(line)..]);
    } else {
      var n := WordLength(line);
      WordLengthFree(line);
      SplitGivesWords(line[n..]);
    }
  }

  lemma LineTail(words: seq<bytes>, gaps: seq<bytes>)
    requires IsLine(words, gaps) && words != []
    ensures IsLine(words[1..], gaps[1..]) && IsGap(gaps[0]) && IsWord(words[0])
    ensures var rest := Line(words[1..], gaps[1..]); rest == [] || BlankLength(rest) > 0
  {
    hide IsGap, IsWord, BlankLength;
    assert gaps[0] in gaps && gaps[1] in gaps && words[0] in words;
    assert forall w :: w in words[1..] ==> w in words;
    assert forall g :: g in gaps[1..] ==> g in gaps;
    GapHead(gaps[1]);
    if |words| > 1 {
      var more := words[1] + Line(words[2..], gaps[2..]);
      BlankStays(gaps[1], more);
      assert words[1..][1..] == words[2..] && gaps[1..][1..] == gaps[2..];
      assert gaps[1] + words[1] + Line(words[2..], gaps[2..]) == gaps[1] + more;
    }
  }

  lemma GapHead(gap: bytes)
    ensures IsGap(gap) && gap != [] ==> BlankLength(gap) > 0
  {
  }

  lemma {:induction false} SplitLine(words: seq<bytes>, gaps: seq<bytes>)
    requires IsLine(words, gaps)
    ensures Split(Line(words, gaps)) == words
    decreases |words|
  {
    hide Split, IsGap, IsWord;
    if words == [] {
      assert gaps[0] in gaps;
      assert gaps[0] + [] == gaps[0];
      SplitGap(gaps[0], []);
      assert Split([]) == [] by { SplitNothing(); }
    } else {
      LineTail(words, gaps);
      var rest := Line(words[1..], gaps[1..]);
      assert gaps[0] + words[0] + rest == gaps[0] + (words[0] + rest);
      SplitGap(gaps[0], words[0] + rest);
      SplitWord(words[0], rest);
      SplitLine(words[1..], gaps[1..]);
    }
  }

  lemma SplitNothing()
    ensures Split([]) == []
  {
  }

  lemma {:induction false} LineHasNoCr(words: seq<bytes>, gaps: seq<bytes>)
    requires IsLine(words, gaps)
    ensures CR !in Line(words, gaps)
    decreases |words|
  {
    hide IsGap, IsWord;
    if words == [] {
      assert gaps[0] in gaps;
      GapHasNoCr(gaps[0]);
    } else {
      LineTail(words, gaps);
      GapHasNoCr(gaps[0]);
      assert BlankFree(words[0]) by { WordIsFree(words[0]); }
      WordHasNoCr(words[0]);
      LineHasNoCr(words[1..], gaps[1..]);
    }
  }

  lemma WordIsFree(word: bytes)
    requires IsWord(word)
    ensures BlankFree(word)
  {
  }

  lemma {:induction false} WordHasNoCr(word: bytes)
    requires BlankFree(word)
    ensures CR !in word
  {
    if word == [] {
    } else {
      WordHasNoCr(word[1..]);
      assert word == [word[0]] + word[1..];
    }
  }

  lemma {:induction false} GapHasNoCr(gap: bytes)
    requires IsGap(gap)
    ensures CR !in gap
    decreases |gap|
  {
    if gap == [] {
    } else {
      var n := BlankLength(gap);
      GapHasNoCr(gap[n..]);
      assert gap == gap[..n] + gap[n..];
      assert CR !in gap[..n];
    }
  }

  /** An inline command is its words, however many blanks surround them; an empty line is one empty
      argument. */
  lemma InlineRoundTrip(words: seq<bytes>, gaps: seq<bytes>, rest: bytes)
    requires IsLine(words, gaps) && (Line(words, gaps) != [] ==> Line(words, gaps)[0] != STAR)
    ensures Parse(Line(words, gaps) + CRLF + rest) == Command(if words == [] then [[]] else words, rest)
  {
    hide Split, Line, ParseArray, FindCrlf;
    var line := Line(words, gaps);
    var buf := line + CRLF + rest;
    SplitLine(words, gaps);
    LineHasNoCr(words, gaps);
    FirstCr(line, rest);
    assert buf[..|line|] == line && buf[|line| + 2..] == rest;
    assert line != [] ==> buf[0] == line[0];
  }

  lemma FirstCr(line: bytes, rest: bytes)
    requires CR !in line
    ensures FindCrlf(line + CRLF + rest, 0) == |line|
  {
    var buf := line + CRLF + rest;
    forall k | 0 <= k < |line| ensures !CrlfAt(buf, k) {
      assert buf[k] == line[k] && line[k] in line;
    }
    FindCrlfUnique(buf, 0, |line|);
  }
}
